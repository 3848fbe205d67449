/**
 * `escapeUTF16LE` / `unescapeUTF16LE` (mod.ts:443-483): every unit becomes its two bytes, low
 * byte first (the little-endian layout of section 3.2 of RFC 2781). A byte in the safe set is
 * written as that character, any other one as `%XX`. Unescaping removes one leading byte order
 * mark `%FF%FE` and joins byte pairs back into units.
 */
module Utf16Le {
  import opened Units

  /**
   * `H`: one byte, literal when it is in the safe set. A literal is never `%`, so the decoder
   * tells the two forms apart by the first unit.
   */
  function H(b: Byte): (r: seq<Unit>)
    ensures IsSafe(b) <==> |r| == 1
    ensures |r| == 1 ==> r[0] == b && r[0] != PERCENT
    ensures |r| != 1 ==> |r| == 3 && PctAt(r, 0) && PctVal(r, 0) == b
  {
    if IsSafe(b) then [b] else Pct(b)
  }

  /** `fn1` of `escapeUTF16LE`: low byte, then high byte. */
  function EscapeUnit(c: Unit): seq<Unit>
  {
    H(c % 256) + H(c / 256)
  }

  /** `rx1` (`/[^ ]| /g`) matches every unit, so every unit is converted. */
  function EscapeUTF16LE(s: seq<Unit>): seq<Unit>
  {
    Flat(EscapeUnit, s)
  }

  /** The class `[\x00-\xFF]` of `rx2`: one unit standing for its own byte. */
  predicate LitAt(s: seq<Unit>, i: int)
  {
    0 <= i < |s| && s[i] < 256
  }

  /**
   * Length of the match of `rx2` (mod.ts:466-469) at the start of `s`, alternatives tried in
   * their written order: `%XX%XX`, `%XX` + literal, literal + `%XX`, two literals. 0 when none.
   */
  function PairLength(s: seq<Unit>): (n: nat)
    ensures n == 0 || n == 2 || n == 4 || n == 6
    ensures n <= |s|
  {
    if PctAt(s, 0) && PctAt(s, 3) then 6
    else if PctAt(s, 0) && LitAt(s, 3) then 4
    else if LitAt(s, 0) && PctAt(s, 1) then 4
    else if LitAt(s, 0) && LitAt(s, 1) then 2
    else 0
  }

  /**
   * `fn1` of `unescapeUTF16LE`: `low | high << 8`. For a four-unit match the source tests the
   * first unit for `%`; when that `%` is a literal byte (the third alternative, as in `%%41`),
   * `parseInt` of `%4` is NaN, which `|` turns into 0.
   */
  function PairValue(s: seq<Unit>, n: nat): Unit
    requires n == PairLength(s) && n != 0
  {
    if n == 6 then PctVal(s, 0) + PctVal(s, 3) * 256
    else if n == 4 then
      if s[0] == PERCENT then (if PctAt(s, 0) then PctVal(s, 0) else 0) + s[3] * 256
      else s[0] + PctVal(s, 1) * 256
    else s[0] + s[1] * 256
  }

  function DecodePairs(s: seq<Unit>): seq<Unit>
    decreases |s|
  {
    if s == [] then []
    else
      var n := PairLength(s);
      if n == 0 then [s[0]] + DecodePairs(s[1..])
      else [PairValue(s, n)] + DecodePairs(s[n..])
  }

  /** `/^%FF%FE/i`: a leading byte order mark. */
  predicate BomAt(s: seq<Unit>)
  {
    PctIn(s, 0, 0xFF, 0xFF) && PctIn(s, 3, 0xFE, 0xFE)
  }

  function UnescapeUTF16LE(s: seq<Unit>): seq<Unit>
  {
    DecodePairs(if BomAt(s) then s[6..] else s)
  }

  /** The two bytes of a unit are read back as that unit, whatever follows. */
  lemma DecodeToken(c: Unit, rest: seq<Unit>)
    ensures DecodePairs(EscapeUnit(c) + rest) == [c] + DecodePairs(rest)
  {
    var lo, hi := c % 256, c / 256;
    assert lo + hi * 256 == c;
    if IsSafe(lo) && IsSafe(hi) {
      TwoLiterals(lo, hi, rest);
    } else if IsSafe(lo) {
      LiteralThenPct(lo, hi, rest);
    } else if IsSafe(hi) {
      PctThenLiteral(lo, hi, rest);
    } else {
      TwoPct(lo, hi, rest);
    }
    ReadPair(EscapeUnit(c), rest, c);
  }

  /** A match that covers exactly `t` is read as one unit, then what follows. */
  lemma ReadPair(t: seq<Unit>, rest: seq<Unit>, v: Unit)
    requires t != [] && PairLength(t + rest) == |t| && PairValue(t + rest, |t|) == v
    ensures DecodePairs(t + rest) == [v] + DecodePairs(rest)
  {
    assert (t + rest)[|t|..] == rest;
  }

  lemma TwoLiterals(lo: Byte, hi: Byte, rest: seq<Unit>)
    requires IsSafe(lo) && IsSafe(hi)
    ensures var s := [lo, hi] + rest; PairLength(s) == 2 && PairValue(s, 2) == lo + hi * 256
  {
  }

  lemma LiteralThenPct(lo: Byte, hi: Byte, rest: seq<Unit>)
    requires IsSafe(lo) && !IsSafe(hi)
    ensures var s := [lo] + Pct(hi) + rest; PairLength(s) == 4 && PairValue(s, 4) == lo + hi * 256
  {
    var t := [lo] + Pct(hi);
    assert t[1..] == Pct(hi);
    PctPrefix(t, rest, 1);
  }

  lemma PctThenLiteral(lo: Byte, hi: Byte, rest: seq<Unit>)
    requires !IsSafe(lo) && IsSafe(hi)
    ensures var s := Pct(lo) + [hi] + rest; PairLength(s) == 4 && PairValue(s, 4) == lo + hi * 256
  {
    var t := Pct(lo) + [hi];
    PctPrefix(t, rest, 0);
  }

  lemma TwoPct(lo: Byte, hi: Byte, rest: seq<Unit>)
    requires !IsSafe(lo) && !IsSafe(hi)
    ensures var s := Pct(lo) + Pct(hi) + rest; PairLength(s) == 6 && PairValue(s, 6) == lo + hi * 256
  {
    var t := Pct(lo) + Pct(hi);
    assert t[3..] == Pct(hi);
    PctPrefix(t, rest, 0);
    PctPrefix(t, rest, 3);
  }

  lemma {:induction false} DecodeEscaped(s: seq<Unit>)
    ensures DecodePairs(EscapeUTF16LE(s)) == s
    decreases |s|
  {
    if s != [] {
      DecodeToken(s[0], EscapeUTF16LE(s[1..]));
      DecodeEscaped(s[1..]);
      assert [s[0]] + s[1..] == s;
    }
  }

  /** Round trip for every text that does not itself start with U+FEFF. */
  lemma RoundTrip(s: seq<Unit>)
    requires s == [] || s[0] != 0xFEFF
    ensures UnescapeUTF16LE(EscapeUTF16LE(s)) == s
  {
    if s != [] {
      assert EscapeUTF16LE(s) == EscapeUnit(s[0]) + EscapeUTF16LE(s[1..]);
    }
    DecodeEscaped(s);
  }

  /** With a byte order mark in front, every text comes back, U+FEFF at its start included. */
  lemma RoundTripWithBom(s: seq<Unit>)
    ensures UnescapeUTF16LE(Pct(0xFF) + Pct(0xFE) + EscapeUTF16LE(s)) == s
  {
    var e := Pct(0xFF) + Pct(0xFE) + EscapeUTF16LE(s);
    PctPrefix(Pct(0xFF), Pct(0xFE) + EscapeUTF16LE(s), 0);
    assert e == Pct(0xFF) + (Pct(0xFE) + EscapeUTF16LE(s));
    assert e[3..] == Pct(0xFE) + EscapeUTF16LE(s);
    PctPrefix(Pct(0xFE), EscapeUTF16LE(s), 0);
    assert e[6..] == EscapeUTF16LE(s);
    DecodeEscaped(s);
  }
}
