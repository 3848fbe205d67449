/**
 * `escapeEUCJP` / `unescapeEUCJP` (mod.ts:92-123). A table character at index `idx` of the
 * 94-column table becomes the bytes `idx / 94 + 161` and `idx % 94 + 161`; half-width
 * katakana become `%8E` and one byte; ASCII becomes `%XX`.
 */
module EucJp {
  import opened Units
  import opened CodeTable

  /** Half-width katakana U+FF61-U+FF9F. */
  predicate IsKana(c: int)
  {
    65376 < c < 65440
  }

  /** `%A1%A6`, the escape of a character the table does not hold. */
  const UNDEFINED: seq<Unit> := Pct(0xA1) + Pct(0xA6)

  /** `func` of `escapeEUCJP` under `/[^*+.-9A-Z_a-z-]/g`. */
  function EscapeUnit(c: Unit): seq<Unit>
  {
    if IsSafe(c) then [c]
    else if c < 128 then Pct(c)
    else if IsKana(c) then Pct(0x8E) + Pct(c - 65216)
    else
      var idx := IndexOf(JCT8836, c);
      if idx < 0 then UNDEFINED
      else Pct(idx / 94 + 161) + Pct(idx % 94 + 161)
  }

  function EscapeEUCJP(s: seq<Unit>): seq<Unit>
  {
    Flat(EscapeUnit, s)
  }

  /** `(%A[1-9A-F]|%[B-E][0-9A-F]|%F[0-9A-E]){2}`: two bytes in 0xA1-0xFE. */
  predicate PairAt(s: seq<Unit>)
  {
    PctIn(s, 0, 0xA1, 0xFE) && PctIn(s, 3, 0xA1, 0xFE)
  }

  /** `%8E%(A[1-9A-F]|[B-D][0-9A-F])`: the katakana prefix and a byte in 0xA1-0xDF. */
  predicate KanaAt(s: seq<Unit>)
  {
    PctIn(s, 0, 0x8E, 0x8E) && PctIn(s, 3, 0xA1, 0xDF)
  }

  /** Length of the match of the pattern at mod.ts:120-121 at the start of `s`; 0 when none. */
  function TokenLength(s: seq<Unit>): (n: nat)
    ensures n == 0 || n == 3 || n == 6
    ensures n <= |s|
  {
    if PairAt(s) || KanaAt(s) then 6
    else if PctIn(s, 0, 0, 0x7F) then 3
    else 0
  }

  /** `func` of `unescapeEUCJP` (mod.ts:114-119). */
  function DecodeToken(s: seq<Unit>, n: nat): seq<Unit>
    requires n == TokenLength(s) && n != 0
  {
    var c := PctVal(s, 0);
    if c < 161 then [if c < 128 then c else PctVal(s, 3) + 65216]
    else CharAt(JCT8836, (c - 161) * 94 + PctVal(s, 3) - 161)
  }

  function UnescapeEUCJP(s: seq<Unit>): seq<Unit>
    decreases |s|
  {
    if s == [] then []
    else
      var n := TokenLength(s);
      if n == 0 then [s[0]] + UnescapeEUCJP(s[1..])
      else DecodeToken(s, n) + UnescapeEUCJP(s[n..])
  }

  predicate Representable(c: Unit)
  {
    c < 128 || IsKana(c) || c in JCT8836
  }

  /** Two escapes side by side are read as their bytes, whatever follows. */
  lemma TwoPct(b1: Byte, b2: Byte, rest: seq<Unit>)
    ensures var s := Pct(b1) + Pct(b2) + rest;
      PctAt(s, 0) && PctVal(s, 0) == b1 && PctAt(s, 3) && PctVal(s, 3) == b2 && s[6..] == rest
  {
    var t := Pct(b1) + Pct(b2);
    assert t[..3] == Pct(b1) && t[3..] == Pct(b2);
    PctPrefix(t, rest, 0);
    PctPrefix(t, rest, 3);
    assert (t + rest)[6..] == rest;
  }

  /** `unescapeEUCJP` at a match: its decoding, then the rest. */
  lemma DecodeStep(s: seq<Unit>)
    requires TokenLength(s) != 0
    ensures UnescapeEUCJP(s) == DecodeToken(s, TokenLength(s)) + UnescapeEUCJP(s[TokenLength(s)..])
  {
  }

  lemma KanjiToken(c: Unit, rest: seq<Unit>)
    requires c >= 128 && !IsKana(c) && c in JCT8836
    ensures UnescapeEUCJP(EscapeUnit(c) + rest) == [c] + UnescapeEUCJP(rest)
  {
    var idx := IndexOf(JCT8836, c);
    var row, cell := idx / 94, idx % 94;
    RowCell(idx);
    var b1, b2 := row + 161, cell + 161;
    assert EscapeUnit(c) == Pct(b1) + Pct(b2);
    var s := Pct(b1) + Pct(b2) + rest;
    TwoPct(b1, b2, rest);
    assert PairAt(s);
    DecodeStep(s);
    assert DecodeToken(s, 6) == CharAt(JCT8836, (b1 - 161) * 94 + b2 - 161);
  }

  /** The escape of a representable unit is read back as that unit, whatever follows. */
  lemma UnescapeToken(c: Unit, rest: seq<Unit>)
    requires Representable(c)
    ensures UnescapeEUCJP(EscapeUnit(c) + rest) == [c] + UnescapeEUCJP(rest)
  {
    var t := EscapeUnit(c);
    var s := t + rest;
    if IsSafe(c) {
      assert s[0] == c && s[1..] == rest;
    } else if c < 128 {
      PctPrefix(t, rest, 0);
      assert TokenLength(s) == 3;
      assert s[3..] == rest;
      DecodeStep(s);
    } else if IsKana(c) {
      TwoPct(0x8E, c - 65216, rest);
      assert TokenLength(s) == 6;
      DecodeStep(s);
    } else {
      KanjiToken(c, rest);
    }
  }

  /** Round trip for every text of representable units. */
  lemma {:induction false} RoundTrip(s: seq<Unit>)
    requires forall i :: 0 <= i < |s| ==> Representable(s[i])
    ensures UnescapeEUCJP(EscapeEUCJP(s)) == s
    decreases |s|
  {
    if s != [] {
      UnescapeToken(s[0], EscapeEUCJP(s[1..]));
      RoundTrip(s[1..]);
      assert [s[0]] + s[1..] == s;
    }
  }

  lemma SafePassthrough(s: seq<Unit>)
    requires AllSafe(s)
    ensures EscapeEUCJP(s) == s
  {
    FlatIdentity(EscapeUnit, s);
  }

  /** A character missing from the table escapes to `%A1%A6`, which reads back as table entry 5. */
  lemma Undefined(c: Unit)
    requires c >= 128 && !IsKana(c) && c !in JCT8836
    ensures EscapeEUCJP([c]) == UNDEFINED
    ensures UnescapeEUCJP(UNDEFINED) == [JCT8836[5]]
  {
    FlatSingle(EscapeUnit, c);
    TwoPct(0xA1, 0xA6, []);
    assert UNDEFINED + [] == UNDEFINED;
  }

  /** Half-width katakana become `%8E` and `c - 0xFEC0`; U+FF60 just below goes through the table. */
  lemma KanaBoundary()
    ensures EscapeEUCJP([0xFF61]) == Pct(0x8E) + Pct(0xA1)
    ensures EscapeEUCJP([0xFF9F]) == Pct(0x8E) + Pct(0xDF)
    ensures !IsKana(0xFF60) && EscapeEUCJP([0xFF60]) == EscapeUnit(0xFF60)
  {
    FlatSingle(EscapeUnit, 0xFF61);
    FlatSingle(EscapeUnit, 0xFF9F);
    FlatSingle(EscapeUnit, 0xFF60);
  }

  /** `%A4%A2` (row 3, cell 1) reads back as table entry 283, which is あ in the real table. */
  lemma Hiragana()
    ensures UnescapeEUCJP(Pct(0xA4) + Pct(0xA2)) == [JCT8836[283]]
  {
    TwoPct(0xA4, 0xA2, []);
    assert Pct(0xA4) + Pct(0xA2) + [] == Pct(0xA4) + Pct(0xA2);
  }
}
