/** What sanitizing spells out, said of characters and code points (internal/sanitize/sanitize.go). */
module SanitizeSpelling {
  import opened Basics
  import opened Filling
  import opened Sanitize

  // ---------------------------------------------------------------- what a terminal would act on

  /** The code point of a character of one or two bytes (section 3 of RFC 3629). */
  function Rune(c: Bytes): bv16
    requires |c| == 1 || |c| == 2
  {
    if |c| == 1 then c[0] as bv16 else (((c[0] & 0x1F) as bv16) << 6) | ((c[1] & 0x3F) as bv16)
  }

  /** C0 without the tab, DEL, and C1. */
  predicate Forbidden(r: bv16) { (r < 0x20 && r != 9) || r == 0x7F || 0x80 <= r <= 0x9F }

  predicate Acts(c: Bytes) { (|c| == 1 || |c| == 2) && Forbidden(Rune(c)) }

  lemma {:induction false} ControlExactlyWhen(c: Bytes)
    requires IsChar(c)
    ensures IsControl(c) <==> Acts(c)
    ensures Acts(c) ==> c[|c| - 1] as bv16 == Rune(c)
  {
    if |c| == 2 { TwoByteRune(c[0], c[1]); }
  }

  lemma {:induction false} TwoByteRune(a: byte, b: byte)
    requires 0xC2 <= a <= 0xDF && 0x80 <= b <= 0xBF
    ensures var r := (((a & 0x1F) as bv16) << 6) | ((b & 0x3F) as bv16);
            && (Forbidden(r) <==> a == 0xC2 && b <= 0x9F)
            && (a == 0xC2 ==> r == b as bv16)
  {
  }

  // ---------------------------------------------------------------- the whole text spelled out

  predicate StartsWithChar(s: Bytes, n: int) { 1 <= n <= |s| && IsChar(s[..n]) }

  /** A character as it is, one a terminal would act on as the escape of its code point. */
  function CharSpelled(c: Bytes): Bytes {
    if Acts(c) then EscapeByte(c[|c| - 1]) else c
  }

  /** Character by character; a byte that starts none is escaped alone. */
  ghost function Spelled(s: Bytes): Bytes {
    if s == [] then []
    else if exists n :: StartsWithChar(s, n) then
      var n :| StartsWithChar(s, n);
      CharSpelled(s[..n]) + Spelled(s[n..])
    else EscapeByte(s[0]) + Spelled(s[1..])
  }

  lemma {:induction false} DecodedAsChar(s: Bytes, n: nat)
    requires StartsWithChar(s, n)
    ensures Decode(s) == Some(n) && Piece(s) == Step(CharSpelled(s[..n]), n)
  {
    assert s[..n] + s[n..] == s;
    DecodesGrammar(s[..n], s[n..]);
    ControlExactlyWhen(s[..n]);
  }

  lemma {:induction false} NoCharDecoded(s: Bytes)
    requires s != [] && forall n :: !StartsWithChar(s, n)
    ensures Piece(s) == Step(EscapeByte(s[0]), 1)
  {
    if Decode(s).Some? {
      DecodedIsChar(s);
      assert StartsWithChar(s, Decode(s).value);
    }
  }

  lemma {:induction false} CharFirst(s: Bytes, n: nat)
    requires StartsWithChar(s, n)
    ensures Spelled(s) == CharSpelled(s[..n]) + Spelled(s[n..])
  {
    forall m: nat | StartsWithChar(s, m) ensures m == n {
      DecodedAsChar(s, m);
      DecodedAsChar(s, n);
    }
  }

  lemma {:induction false} TurnIsSpelled(s: Bytes)
    requires s != []
    ensures 1 <= Piece(s).size <= |s| && Spelled(s) == Piece(s).piece + Spelled(s[Piece(s).size..])
  {
    if exists n :: StartsWithChar(s, n) {
      var n :| StartsWithChar(s, n);
      DecodedAsChar(s, n);
      CharFirst(s, n);
    } else {
      NoCharDecoded(s);
    }
  }

  /** How a text is spelled. */
  type Spelling = Bytes -> Bytes

  /** At i the turn makes the first of the rest's spelling. */
  ghost predicate Unfolds(spelled: Spelling, turns: Turns<byte>, s: Bytes, i: nat) {
    i < |s| && var k := turns(i).size; 1 <= k <= |s| - i && spelled(s[i..]) == turns(i).piece + spelled(s[i..][k..])
  }

  function SpelledFrom(spelled: Spelling, s: Bytes, i: nat): Bytes { if i <= |s| then spelled(s[i..]) else [] }

  lemma {:induction false} UnfoldsAt(spelled: Spelling, turns: Turns<byte>, s: Bytes, i: nat)
    requires Unfolds(spelled, turns, s, i)
    ensures SpelledFrom(spelled, s, i) == turns(i).piece + SpelledFrom(spelled, s, i + turns(i).size)
  {
    assert s[i..][turns(i).size..] == s[i + turns(i).size..];
  }

  lemma {:induction false} AllUnfolded(spelled: Spelling, turns: Turns<byte>, s: Bytes)
    requires Advances(turns, |s|) && spelled([]) == [] && forall i: nat | i < |s| :: Unfolds(spelled, turns, s, i)
    ensures All(turns, |s|, 0) == SpelledFrom(spelled, s, 0)
  {
    var whole := (i: nat) => SpelledFrom(spelled, s, i);
    forall i: nat | i < |s| ensures whole(i) == turns(i).piece + whole(i + turns(i).size) { UnfoldsAt(spelled, turns, s, i); }
    assert s[|s|..] == [];
    AllFrom(turns, |s|, whole, 0);
  }

  lemma {:induction false} AllIsSpelled(s: Bytes)
    requires Advances(TurnsOf(s), |s|)
    ensures All(TurnsOf(s), |s|, 0) == Spelled(s)
  {
    var spelled: Spelling := (t: Bytes) => Spelled(t);
    forall i: nat | i < |s| ensures Unfolds(spelled, TurnsOf(s), s, i) { TurnIsSpelled(s[i..]); }
    AllUnfolded(spelled, TurnsOf(s), s);
    assert s[0..] == s;
  }

  /** Sanitizing gives the whole spelling where that fits; otherwise a beginning of it within the cap, almost filling it, and the marker. */
  lemma {:induction false} CleanSpells(s: Bytes, max: nat) returns (text: Bytes)
    ensures text <= Spelled(s) && |text| <= max
    ensures Cleaned(s, max) == if |Spelled(s)| <= max then text else text + MARKER
    ensures if |Spelled(s)| <= max then text == Spelled(s) else |text| + 4 > max
  {
    TurnsAdvance(s);
    AllIsSpelled(s);
    FitIsPrefix(TurnsOf(s), |s|, 0, [], max);
    FitFits(TurnsOf(s), |s|, 0, [], max);
    CutExactlyWhen(TurnsOf(s), |s|, 0, [], max);
    SizeOfAll(TurnsOf(s), |s|, 0);
    text := Fitted(s, max).text;
    assert [] + Spelled(s) == Spelled(s);
  }

  lemma {:induction false} SizeOfAll<T>(turn: Turns<T>, n: nat, i: nat)
    requires Advances(turn, n)
    ensures |All(turn, n, i)| == SizeFrom(turn, n, i)
    decreases n - i
  {
    if i < n { SizeOfAll(turn, n, i + turn(i).size); }
  }
}
