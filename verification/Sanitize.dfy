/** Neutralising untrusted text, byte by byte (internal/sanitize/sanitize.go). */
module Sanitize {
  import opened Basics
  import opened Filling

  type Bytes = seq<byte>

  // ---------------------------------------------------------------- UTF-8

  /** What a leading byte announces: how many bytes, and the range of the second. */
  datatype Lead = Lead(size: nat, lo: byte, hi: byte)

  function LeadOf(b: byte): Lead {
    if b < 0x80 then Lead(1, 0, 0)
    else if 0xC2 <= b <= 0xDF then Lead(2, 0x80, 0xBF)
    else if b == 0xE0 then Lead(3, 0xA0, 0xBF)
    else if b == 0xED then Lead(3, 0x80, 0x9F)
    else if 0xE1 <= b <= 0xEF then Lead(3, 0x80, 0xBF)
    else if b == 0xF0 then Lead(4, 0x90, 0xBF)
    else if b == 0xF4 then Lead(4, 0x80, 0x8F)
    else if 0xF1 <= b <= 0xF3 then Lead(4, 0x80, 0xBF)
    else Lead(0, 0, 0)
  }

  predicate IsTail(b: byte) { 0x80 <= b <= 0xBF }

  /** The size of the character at the front, as utf8.DecodeRune finds it; none where the first byte is invalid. */
  function Decode(s: Bytes): Option<nat> {
    if s == [] then None
    else
      var l := LeadOf(s[0]);
      if l.size == 0 || |s| < l.size then None
      else if l.size == 1 then Some(1)
      else if !(l.lo <= s[1] <= l.hi) then None
      else if l.size == 2 then Some(2)
      else if !IsTail(s[2]) then None
      else if l.size == 3 then Some(3)
      else if !IsTail(s[3]) then None
      else Some(4)
  }

  /** One character by the grammar of section 4 of RFC 3629. */
  predicate IsChar(c: Bytes) {
    || (|c| == 1 && c[0] <= 0x7F)
    || (|c| == 2 && 0xC2 <= c[0] <= 0xDF && IsTail(c[1]))
    || (|c| == 3 && IsTail(c[2]) && (
          || (c[0] == 0xE0 && 0xA0 <= c[1] <= 0xBF)
          || (0xE1 <= c[0] <= 0xEC && IsTail(c[1]))
          || (c[0] == 0xED && 0x80 <= c[1] <= 0x9F)
          || (0xEE <= c[0] <= 0xEF && IsTail(c[1]))))
    || (|c| == 4 && IsTail(c[2]) && IsTail(c[3]) && (
          || (c[0] == 0xF0 && 0x90 <= c[1] <= 0xBF)
          || (0xF1 <= c[0] <= 0xF3 && IsTail(c[1]))
          || (c[0] == 0xF4 && 0x80 <= c[1] <= 0x8F)))
  }

  /** The decoder accepts exactly the characters of the grammar, whatever follows them. */
  lemma {:induction false} DecodesGrammar(c: Bytes, rest: Bytes)
    requires IsChar(c)
    ensures Decode(c + rest) == Decode(c) == Some(|c|)
  {
    assert (c + rest)[0] == c[0];
    assert |c| > 1 ==> (c + rest)[1] == c[1];
    assert |c| > 2 ==> (c + rest)[2] == c[2];
    assert |c| > 3 ==> (c + rest)[3] == c[3];
  }

  lemma {:induction false} DecodedIsChar(s: Bytes)
    requires Decode(s).Some?
    ensures var n := Decode(s).value; 1 <= n <= |s| && n <= 4 && IsChar(s[..n])
  {
  }

  // ---------------------------------------------------------------- what must not come out

  /** C0 except tab, DEL, and C1: U+0080 to U+009F are encoded as C2 80 to C2 9F. */
  predicate IsControl(c: Bytes) {
    || (|c| == 1 && ((c[0] < 0x20 && c[0] != 0x09) || c[0] == 0x7F))
    || (|c| == 2 && c[0] == 0xC2 && c[1] <= 0x9F)
  }

  /** The character at the front. */
  function Front(s: Bytes): (c: Bytes)
    requires Decode(s).Some?
  {
    var n := Decode(s).value;
    if n <= |s| then s[..n] else s
  }

  /** A text of characters none of which a terminal would act on. */
  predicate IsClean(s: Bytes) {
    s == [] || (Decode(s).Some? && !IsControl(Front(s)) && 1 <= Decode(s).value <= |s| && IsClean(s[Decode(s).value..]))
  }

  /** Well-formed UTF-8: characters of the grammar, one after another. */
  ghost predicate IsUTF8(s: Bytes) {
    s == [] || exists n :: 1 <= n <= |s| && IsChar(s[..n]) && IsUTF8(s[n..])
  }

  lemma {:induction false} CleanIsUTF8(s: Bytes)
    requires IsClean(s)
    ensures IsUTF8(s)
  {
    if s != [] {
      DecodedIsChar(s);
      CleanIsUTF8(s[Decode(s).value..]);
    }
  }

  // ---------------------------------------------------------------- escaping

  function HexDigit(n: byte): byte { if n < 10 then 48 + n else 87 + n }

  /** `\x` and two lower-case hexadecimal digits. */
  function EscapeByte(c: byte): Bytes { [92, 120, HexDigit(c >> 4), HexDigit(c & 15)] }

  const HEX_DIGITS: Bytes := [48, 49, 50, 51, 52, 53, 54, 55, 56, 57, 97, 98, 99, 100, 101, 102]

  lemma {:induction false} DigitInTable(n: byte)
    requires n < 16
    ensures HEX_DIGITS[n as int] == HexDigit(n)
  {
    var k := n as int;
    assert k < 16;
    assert n == k as byte;
  }

  /** The escape is a backslash, an x, and the digits of "0123456789abcdef" at the byte's high and low half. */
  lemma {:induction false} EscapeSpellsTheByte(c: byte) returns (hi: byte, lo: byte)
    ensures hi < 16 && lo < 16 && (hi << 4) | lo == c
    ensures EscapeByte(c) == [92, 120, HEX_DIGITS[hi as int], HEX_DIGITS[lo as int]]
  {
    hi, lo := c >> 4, c & 15;
    DigitInTable(hi);
    DigitInTable(lo);
  }

  /** The code point of a character of one or two bytes. */
  function CodePoint(c: Bytes): byte
    requires |c| == 1 || |c| == 2
  {
    if |c| == 1 then c[0] else ((c[0] & 0x1F) << 6) | (c[1] & 0x3F)
  }

  /** The byte escaped for a control is its code point: C0 and DEL below 0x80, C1 from 0x80 to 0x9F. */
  lemma {:induction false} ControlIsItsCodePoint(c: Bytes)
    requires IsChar(c) && IsControl(c)
    ensures |c| <= 2 && c[|c| - 1] == CodePoint(c)
    ensures |c| == 2 ==> 0x80 <= CodePoint(c) <= 0x9F
  {
  }

  /** What one turn of the loop does to what is left; the code point of a C1 control is its second byte. */
  function Piece(s: Bytes): Step<byte> {
    if s == [] then Step([], 0)
    else if Decode(s).None? then Step(EscapeByte(s[0]), 1)
    else
      var c := Front(s);
      if IsControl(c) then Step(EscapeByte(c[|c| - 1]), |c|) else Step(c, |c|)
  }

  function TurnsOf(s: Bytes): Turns<byte> {
    (i: nat) => if i < |s| then Piece(s[i..]) else Step([], 0)
  }

  lemma {:induction false} TurnsAdvance(s: Bytes)
    ensures Advances(TurnsOf(s), |s|)
  {
    forall i: nat | i < |s| ensures 1 <= TurnsOf(s)(i).size <= |s| - i && 1 <= |TurnsOf(s)(i).piece| <= 4 {
      if Decode(s[i..]).Some? { DecodedIsChar(s[i..]); }
    }
  }

  /** "... [truncated]". */
  const MARKER: Bytes := [46, 46, 46, 32, 91, 116, 114, 117, 110, 99, 97, 116, 101, 100, 93]

  ghost function Fitted(s: Bytes, max: nat): Fitting<byte> {
    TurnsAdvance(s);
    Fit(TurnsOf(s), |s|, 0, [], max)
  }

  ghost function Cleaned(s: Bytes, max: nat): Bytes {
    if Fitted(s, max).cut then Fitted(s, max).text + MARKER else Fitted(s, max).text
  }

  method Clean(s: Bytes, max: nat) returns (text: Bytes)
    ensures text == Cleaned(s, max)
  {
    TurnsAdvance(s);
    var f := Fill(TurnsOf(s), |s|, max);
    return if f.cut then f.text + MARKER else f.text;
  }

  // ---------------------------------------------------------------- what comes out

  /** At most the cap, and the marker when something was left out. */
  lemma {:induction false} CleanIsBounded(s: Bytes, max: nat)
    ensures |Cleaned(s, max)| <= max + |MARKER|
    ensures !Fitted(s, max).cut ==> |Cleaned(s, max)| <= max
  {
    TurnsAdvance(s);
    FitFits(TurnsOf(s), |s|, 0, [], max);
  }

  predicate IsPrintable(b: byte) { 0x20 <= b <= 0x7E }

  lemma {:induction false} PrintableFront(s: Bytes)
    requires |s| > 0 && IsPrintable(s[0])
    ensures Decode(s) == Some(1) && Front(s) == [s[0]] && !IsControl([s[0]]) && Piece(s) == Step([s[0]], 1)
  {
    assert Decode(s) == Some(1);
  }

  lemma {:induction false} PrintableIsClean(p: Bytes)
    requires forall i | 0 <= i < |p| :: IsPrintable(p[i])
    ensures IsClean(p)
  {
    if p != [] {
      PrintableFront(p);
      PrintableIsClean(p[1..]);
    }
  }

  lemma {:induction false} EscapeIsPrintable(c: byte)
    ensures forall i | 0 <= i < 4 :: IsPrintable(EscapeByte(c)[i])
  {
    DigitIsPrintable(c >> 4);
    DigitIsPrintable(c & 15);
  }

  lemma {:induction false} DigitIsPrintable(n: byte)
    requires n < 16
    ensures IsPrintable(HexDigit(n))
  {
  }

  /** One character alone is clean unless it is a control. */
  lemma {:induction false} CharIsClean(c: Bytes)
    requires IsChar(c) && !IsControl(c)
    ensures IsClean(c)
  {
    assert c + [] == c;
    DecodesGrammar(c, []);
    assert c[|c|..] == [] && c[..|c|] == c;
  }

  lemma {:induction false} PieceIsClean(s: Bytes)
    requires s != []
    ensures IsClean(Piece(s).piece)
  {
    if Decode(s).None? {
      EscapeIsPrintable(s[0]);
      PrintableIsClean(Piece(s).piece);
    } else {
      DecodedIsChar(s);
      var c := Front(s);
      if IsControl(c) {
        EscapeIsPrintable(c[|c| - 1]);
        PrintableIsClean(Piece(s).piece);
      } else {
        CharIsClean(c);
      }
    }
  }

  /** Clean texts put together are clean. */
  lemma {:induction false} CleanConcat(a: Bytes, b: Bytes)
    requires IsClean(a) && IsClean(b)
    ensures IsClean(a + b)
  {
    if a == [] {
      assert a + b == b;
    } else {
      SameHead(a, b);
      CleanConcat(a[Decode(a).value..], b);
    }
  }

  lemma {:induction false} TurnIsClean(s: Bytes, i: nat, out: Bytes)
    requires i < |s| && IsClean(out)
    ensures IsClean(out + TurnsOf(s)(i).piece)
  {
    PieceIsClean(s[i..]);
    CleanConcat(out, Piece(s[i..]).piece);
  }

  lemma {:induction false} FittedIsClean(s: Bytes, max: nat)
    ensures IsClean(Fitted(s, max).text)
  {
    TurnsAdvance(s);
    forall i: nat, out: Bytes | i < |s| && IsClean(out) ensures IsClean(out + TurnsOf(s)(i).piece) { TurnIsClean(s, i, out); }
    FitKeeps(TurnsOf(s), |s|, 0, [], max, IsClean);
  }

  lemma {:induction false} MarkerIsPrintable()
    ensures |MARKER| == 15 && forall i | 0 <= i < |MARKER| :: IsPrintable(MARKER[i])
  {
  }

  /** Whatever goes in, what comes out is well-formed UTF-8 without control characters. */
  lemma {:induction false} CleanIsClean(s: Bytes, max: nat)
    ensures IsClean(Cleaned(s, max)) && IsUTF8(Cleaned(s, max))
  {
    FittedIsClean(s, max);
    MarkerIsPrintable();
    PrintableIsClean(MARKER);
    CleanConcat(Fitted(s, max).text, MARKER);
    CleanIsUTF8(Cleaned(s, max));
  }

  // ---------------------------------------------------------------- clean text is left alone

  /** What follows a clean text does not change how it starts. */
  lemma {:induction false} SameHead(s: Bytes, p: Bytes)
    requires s != [] && IsClean(s)
    ensures var n := Decode(s).value;
            && 1 <= n <= |s| && Decode(s + p) == Some(n) && Front(s) == s[..n] == Front(s + p) && IsClean(s[n..])
            && (s + p)[n..] == s[n..] + p && Piece(s + p) == Step(s[..n], n)
  {
    DecodedIsChar(s);
    var n := Decode(s).value;
    Parted(s, n, p);
    DecodesGrammar(s[..n], s[n..] + p);
  }

  lemma {:induction false} Parted<T>(s: seq<T>, n: nat, p: seq<T>)
    requires n <= |s|
    ensures s + p == s[..n] + (s[n..] + p) && (s + p)[..n] == s[..n] && (s + p)[n..] == s[n..] + p
  {
  }

  /** The places from which the rest of s is clean. */
  function CleanFrom(s: Bytes): nat -> bool { (j: nat) => j <= |s| && IsClean(s[j..]) }

  /** Clean text goes through, whatever follows it. */
  lemma {:induction false} CleanPasses(s: Bytes, p: Bytes)
    requires IsClean(s)
    ensures Passes(TurnsOf(s + p), s, 0)
  {
    var turn, good := TurnsOf(s + p), CleanFrom(s);
    forall j: nat | j < |s| && good(j) ensures StepsWell(turn, s, good, j) { CleanSteps(s, p, j); }
    assert s[0..] == s;
    PassesFrom(turn, s, good, 0);
  }

  lemma {:induction false} CleanSteps(s: Bytes, p: Bytes, j: nat)
    requires j < |s| && CleanFrom(s)(j)
    ensures StepsWell(TurnsOf(s + p), s, CleanFrom(s), j)
  {
    CleanTurn(s, p, j);
  }

  lemma {:induction false} CleanTurn(s: Bytes, p: Bytes, i: nat)
    requires i < |s| && IsClean(s[i..])
    ensures var (piece, n) := (TurnsOf(s + p)(i).piece, TurnsOf(s + p)(i).size);
            1 <= n <= |s| - i && piece == s[i..i + n] && IsClean(s[i + n..])
  {
    SameHead(s[i..], p);
    var n := Decode(s[i..]).value;
    Slices(s, p, i, n);
  }

  lemma {:induction false} Slices(s: Bytes, p: Bytes, i: nat, n: nat)
    requires i + n <= |s|
    ensures (s + p)[i..] == s[i..] + p && s[i..][..n] == s[i..i + n] && s[i..][n..] == s[i + n..]
  {
  }

  lemma {:induction false} FitAfterClean(s: Bytes, p: Bytes, max: nat)
    requires IsClean(s) && |s| <= max && Advances(TurnsOf(s + p), |s + p|)
    ensures Fitted(s + p, max) == Fit(TurnsOf(s + p), |s + p|, |s|, s, max)
  {
    assert s[0..] == s && s[..0] == [];
    CleanPasses(s, p);
    FitPasses(TurnsOf(s + p), |s + p|, s, 0, max);
  }

  /** Clean text within the cap comes out as it went in. */
  lemma {:induction false} CleanTextStays(s: Bytes, max: nat)
    requires IsClean(s) && |s| <= max
    ensures Cleaned(s, max) == s
  {
    assert s + [] == s;
    TurnsAdvance(s);
    FitAfterClean(s, [], max);
  }

  lemma {:induction false} PrintableTurns(out: Bytes, p: Bytes)
    requires forall i | 0 <= i < |p| :: IsPrintable(p[i])
    ensures forall j | |out| <= j < |out + p| :: TurnsOf(out + p)(j) == Step([(out + p)[j]], 1)
  {
    var t := out + p;
    forall j | |out| <= j < |t| ensures TurnsOf(t)(j) == Step([t[j]], 1) {
      assert t[j] == p[j - |out|];
      PrintableFront(t[j..]);
    }
  }

  /** Cleaning what was cut fills up with the beginning of the marker and cuts again. */
  lemma {:induction false} SecondCut(out: Bytes, p: Bytes, max: nat)
    requires IsClean(out) && |out| <= max < |out + p| && forall i | 0 <= i < |p| :: IsPrintable(p[i])
    ensures Fitted(out + p, max) == Fitting((out + p)[..max], true)
  {
    var t := out + p;
    TurnsAdvance(t);
    FitAfterClean(out, p, max);
    PrintableTurns(out, p);
    assert t[..|out|] == out;
    FitOneByOne(TurnsOf(t), t, |out|, max);
  }

  lemma {:induction false} CutStaysOnlyWhenFull(s: Bytes, max: nat)
    requires Fitted(s, max).cut
    ensures Cleaned(Cleaned(s, max), max) == Cleaned(s, max) <==> |Fitted(s, max).text| == max
  {
    TurnsAdvance(s);
    var out := Fitted(s, max).text;
    FitFits(TurnsOf(s), |s|, 0, [], max);
    FittedIsClean(s, max);
    MarkerIsPrintable();
    SecondCut(out, MARKER, max);
    LongerThanBefore(out, MARKER, max);
  }

  lemma {:induction false} LongerThanBefore(out: Bytes, p: Bytes, max: nat)
    requires |out| <= max < |out + p|
    ensures (out + p)[..max] + p == out + p <==> |out| == max
  {
    if |out| == max {
      assert (out + p)[..max] == out;
    } else {
      assert |(out + p)[..max] + p| > |out + p|;
    }
  }

  // ---------------------------------------------------------------- exactly when cleaning twice is cleaning once

  /** How long the text is with everything escaped that needs it, whatever the cap. */
  ghost function EscapedSize(s: Bytes): nat {
    TurnsAdvance(s);
    SizeFrom(TurnsOf(s), |s|, 0)
  }

  /** In the escaped text a character or an escape ends after k bytes. */
  ghost predicate EndsAt(s: Bytes, k: nat) {
    TurnsAdvance(s);
    PieceEndsAt(TurnsOf(s), |s|, 0, k)
  }

  /** A text is cut exactly when its escaped form is longer than the cap. */
  lemma {:induction false} CutWhenTooLong(s: Bytes, max: nat)
    ensures Fitted(s, max).cut <==> EscapedSize(s) > max
    ensures EscapedSize(s) > max ==> (|Fitted(s, max).text| == max <==> EndsAt(s, max))
  {
    TurnsAdvance(s);
    CutExactlyWhen(TurnsOf(s), |s|, 0, [], max);
  }

  /** Cleaning twice is cleaning once exactly when the escaped text fits the cap, or one of its pieces ends just there. */
  lemma {:induction false} IdempotentExactlyWhen(s: Bytes, max: nat)
    ensures Cleaned(Cleaned(s, max), max) == Cleaned(s, max) <==> EscapedSize(s) <= max || EndsAt(s, max)
  {
    CutWhenTooLong(s, max);
    if Fitted(s, max).cut {
      CutStaysOnlyWhenFull(s, max);
    } else {
      TurnsAdvance(s);
      FitFits(TurnsOf(s), |s|, 0, [], max);
      CleanIsClean(s, max);
      CleanTextStays(Cleaned(s, max), max);
    }
  }

  /** As many bytes of "a" as leave room for one more, and an ESC. */
  function Overrun(max: nat): Bytes
    requires max > 0
  {
    seq(max - 1, i => 97) + [0x1B]
  }

  /** Under any cap but zero there is a text that changes when it is cleaned again. */
  lemma {:induction false} NotAlwaysIdempotent(max: nat)
    requires max > 0
    ensures Cleaned(Cleaned(Overrun(max), max), max) != Cleaned(Overrun(max), max)
  {
    var s, turn := Overrun(max), TurnsOf(Overrun(max));
    TurnsAdvance(s);
    forall j | 0 <= j < max - 1 ensures turn(j).size == 1 && |turn(j).piece| == 1 {
      PrintableFront(s[j..]);
    }
    assert s[max - 1..] == [0x1B];
    assert Decode([0x1B]) == Some(1) && Front([0x1B]) == [0x1B] && IsControl([0x1B]);
    StepsOver(turn, max, 0);
    IdempotentExactlyWhen(s, max);
  }
}
