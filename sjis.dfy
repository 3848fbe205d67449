/**
 * `escapeSJIS` / `unescapeSJIS` (mod.ts:41-85). A table character at index `idx` of the
 * 188-column table becomes a lead byte from its row and a trail byte from its cell; half-width
 * katakana become one byte; ASCII becomes `%XX`.
 */
module ShiftJis {
  import opened Units
  import opened CodeTable

  /** Half-width katakana U+FF61-U+FF9F, the source's `65376 < c && c < 65440`. */
  predicate IsKana(c: int)
  {
    65376 < c < 65440
  }

  /**
   * The index escaping uses: `JCT11280.indexOf`, replaced by `lastIndexOf` when the first
   * occurrence lies at 8272 or beyond (mod.ts:48-51); -1 when the character is not in the table.
   */
  function SjisIndex(c: Unit): (idx: int)
    ensures -1 <= idx
    ensures idx == -1 <==> c !in JCT11280
    ensures idx >= 0 ==> idx < 11280 && JCT11280[idx] == c
    ensures idx >= 0 && IndexOf(JCT11280, c) < 8272 ==> idx == IndexOf(JCT11280, c)
    ensures idx >= 0 && IndexOf(JCT11280, c) >= 8272 ==> idx == LastIndexOf(JCT11280, c)
  {
    var first := IndexOf(JCT11280, c);
    if first < 0 then -1 else if first < 8272 then first else LastIndexOf(JCT11280, c)
  }

  /** Lead byte of row `row`: 0x81-0x9F for rows 0-30, 0xE0-0xFC for rows 31-59. */
  function LeadByte(row: int): (b: Byte)
    requires 0 <= row < 60
    ensures 0x81 <= b <= 0x9F || 0xE0 <= b <= 0xFC
    ensures (if b < 160 then b - 129 else b - 193) == row
  {
    if row < 31 then row + 129 else row + 193
  }

  /** Trail byte of cell `cell`: 0x40-0x7E for cells 0-62, 0x80-0xFC for cells 63-187; never 0x7F. */
  function TrailByte(cell: int): (b: Byte)
    requires 0 <= cell < 188
    ensures 0x40 <= b <= 0x7E || 0x80 <= b <= 0xFC
    ensures (if b < 127 then b - 64 else b - 65) == cell
  {
    if cell < 63 then cell + 64 else cell + 65
  }

  /** A trail byte in A-Z, `_` or a-z is written as that character (mod.ts:55-57). */
  predicate TrailLiteral(b: int)
  {
    64 < b < 91 || b == 95 || 96 < b < 123
  }

  function TrailToken(b: Byte): seq<Unit>
  {
    if TrailLiteral(b) then [b] else Pct(b)
  }

  /** `%81E`, the escape of a character the table does not hold. */
  const UNDEFINED: seq<Unit> := [PERCENT, Asc('8'), Asc('1'), Asc('E')]

  /** `func` of `escapeSJIS` under `/[^*+.-9A-Z_a-z-]/g`. */
  function EscapeUnit(c: Unit): seq<Unit>
  {
    if IsSafe(c) then [c]
    else if c < 128 then Pct(c)
    else if IsKana(c) then Pct(c - 65216)
    else
      var idx := SjisIndex(c);
      if idx < 0 then UNDEFINED
      else Pct(LeadByte(idx / 188)) + TrailToken(TrailByte(idx % 188))
  }

  function EscapeSJIS(s: seq<Unit>): seq<Unit>
  {
    Flat(EscapeUnit, s)
  }

  /** `%(8[1-9A-F]|[9E][0-9A-F]|F[0-9A-C])`: a lead byte 0x81-0x9F or 0xE0-0xFC. */
  predicate LeadAt(s: seq<Unit>)
  {
    PctIn(s, 0, 0x81, 0x9F) || PctIn(s, 0, 0xE0, 0xFC)
  }

  /** `%[4-689A-F][0-9A-F]|%7[0-9A-E]`: an escaped trail byte 0x40-0x7E or 0x80-0xFF. */
  predicate TrailPctAt(s: seq<Unit>)
  {
    PctIn(s, 3, 0x40, 0x7E) || PctIn(s, 3, 0x80, 0xFF)
  }

  /** `[@-~]`: a literal trail byte. */
  predicate TrailLitAt(s: seq<Unit>)
  {
    3 < |s| && 64 <= s[3] <= 126
  }

  /** `%([0-7][0-9A-F]|A[1-9A-F]|[B-D][0-9A-F])`: one byte, ASCII or katakana. */
  predicate SingleAt(s: seq<Unit>)
  {
    PctIn(s, 0, 0, 0x7F) || PctIn(s, 0, 0xA1, 0xDF)
  }

  /** Length of the match of the pattern at mod.ts:82-83 at the start of `s`; 0 when none. */
  function TokenLength(s: seq<Unit>): (n: nat)
    ensures n == 0 || n == 3 || n == 4 || n == 6
    ensures n <= |s|
  {
    if LeadAt(s) && TrailPctAt(s) then 6
    else if LeadAt(s) && TrailLitAt(s) then 4
    else if SingleAt(s) then 3
    else 0
  }

  /** The table index of a double-byte match (mod.ts:75-79). */
  function PairIndex(s: seq<Unit>, n: nat): int
    requires n == TokenLength(s) && (n == 4 || n == 6)
  {
    var c := PctVal(s, 0);
    var t := if n == 4 then s[3] - 64 else
      var d := PctVal(s, 3);
      if d < 127 then d - 64 else d - 65;
    (if c < 160 then c - 129 else c - 193) * 188 + t
  }

  /** `func` of `unescapeSJIS`: a single byte, or the table character of a byte pair. */
  function DecodeToken(s: seq<Unit>, n: nat): seq<Unit>
    requires n == TokenLength(s) && n != 0
  {
    var c := PctVal(s, 0);
    if n == 3 then [if c < 160 then c else c + 65216]
    else CharAt(JCT11280, PairIndex(s, n))
  }

  function UnescapeSJIS(s: seq<Unit>): seq<Unit>
    decreases |s|
  {
    if s == [] then []
    else
      var n := TokenLength(s);
      if n == 0 then [s[0]] + UnescapeSJIS(s[1..])
      else DecodeToken(s, n) + UnescapeSJIS(s[n..])
  }

  /** The units escaping can represent: ASCII, half-width katakana and the table's characters. */
  predicate Representable(c: Unit)
  {
    c < 128 || IsKana(c) || c in JCT11280
  }

  lemma DoubleByteToken(c: Unit, rest: seq<Unit>)
    requires c >= 128 && !IsKana(c) && c in JCT11280
    ensures var s := EscapeUnit(c) + rest;
      TokenLength(s) == |EscapeUnit(c)| && DecodeToken(s, |EscapeUnit(c)|) == [c]
  {
    var idx := SjisIndex(c);
    assert 0 <= idx < 11280;
    var lead, trail := LeadByte(idx / 188), TrailByte(idx % 188);
    var t := EscapeUnit(c);
    assert t == Pct(lead) + TrailToken(trail);
    var s := t + rest;
    PctPrefix(t, rest, 0);
    if TrailLiteral(trail) {
      assert s[3] == trail;
      assert TokenLength(s) == 4;
      assert PairIndex(s, 4) == idx;
    } else {
      assert t[3..] == Pct(trail);
      PctPrefix(t, rest, 3);
      assert TokenLength(s) == 6;
      assert PairIndex(s, 6) == idx;
    }
  }

  /** The escape of a representable unit is read back as that unit, whatever follows. */
  lemma UnescapeToken(c: Unit, rest: seq<Unit>)
    requires Representable(c)
    ensures UnescapeSJIS(EscapeUnit(c) + rest) == [c] + UnescapeSJIS(rest)
  {
    var t := EscapeUnit(c);
    var s := t + rest;
    if IsSafe(c) {
      assert s[0] == c && s[1..] == rest;
    } else {
      assert s[|t|..] == rest;
      if c < 128 || IsKana(c) {
        PctPrefix(t, rest, 0);
        assert TokenLength(s) == 3;
      } else {
        DoubleByteToken(c, rest);
      }
    }
  }

  /** Round trip for every text of representable units. */
  lemma {:induction false} RoundTrip(s: seq<Unit>)
    requires forall i :: 0 <= i < |s| ==> Representable(s[i])
    ensures UnescapeSJIS(EscapeSJIS(s)) == s
    decreases |s|
  {
    if s != [] {
      UnescapeToken(s[0], EscapeSJIS(s[1..]));
      RoundTrip(s[1..]);
      assert [s[0]] + s[1..] == s;
    }
  }

  lemma SafePassthrough(s: seq<Unit>)
    requires AllSafe(s)
    ensures EscapeSJIS(s) == s
  {
    FlatIdentity(EscapeUnit, s);
  }

  /** A character missing from the table escapes to `%81E`, which reads back as table entry 5. */
  lemma Undefined(c: Unit)
    requires c >= 128 && !IsKana(c) && c !in JCT11280
    ensures EscapeSJIS([c]) == UNDEFINED
    ensures UnescapeSJIS(UNDEFINED) == [JCT11280[5]]
  {
    FlatSingle(EscapeUnit, c);
    var u := UNDEFINED;
    assert TokenLength(u) == 4 && PairIndex(u, 4) == 5;
    assert u[4..] == [];
  }

  /** Half-width katakana become one byte `c - 0xFEC0`; U+FF60 just below goes through the table. */
  lemma KanaBoundary()
    ensures EscapeSJIS([0xFF61]) == Pct(0xA1)
    ensures EscapeSJIS([0xFF9F]) == Pct(0xDF)
    ensures EscapeSJIS([0xFF60]) == EscapeUnit(0xFF60) && !IsKana(0xFF60)
  {
    FlatSingle(EscapeUnit, 0xFF61);
    FlatSingle(EscapeUnit, 0xFF9F);
    FlatSingle(EscapeUnit, 0xFF60);
  }

  /** `%82%A0` (row 1, cell 95) reads back as table entry 283, which is あ in the real table. */
  lemma Hiragana()
    ensures UnescapeSJIS(Pct(0x82) + Pct(0xA0)) == [JCT11280[283]]
  {
    var s := Pct(0x82) + Pct(0xA0);
    PctPrefix(Pct(0x82), Pct(0xA0), 0);
    assert s[3..] == Pct(0xA0);
    PctPrefix(Pct(0xA0), [], 0);
    assert TokenLength(s) == 6 && PairIndex(s, 6) == 283;
    assert s[6..] == [];
  }
}
