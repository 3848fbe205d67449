/**
 * The unescape side of the ISO-2022-JP codecs: `unescapeJIS7` (mod.ts:176-217) and
 * `unescapeJIS8` (mod.ts:264-298) normalise the variant designators of JIS X 0208, split the
 * text at each `%1B`, and decode every segment by the designator it starts with.
 */
module JisUnescape {
  import opened Units
  import opened CodeTable
  import opened JisEscape

  // ---------------------------------------------------------------- splitting and normalising

  /** `%1B` with `B` in either case: where `split(/%1B/i)` cuts. */
  predicate EscAt(s: seq<Unit>, k: int)
  {
    0 <= k && k + 3 <= |s| && s[k] == PERCENT && s[k + 1] == 49 && (s[k + 2] == 66 || s[k + 2] == 98)
  }

  /** The first cut at or after `from`, or -1. */
  function NextEsc(s: seq<Unit>, from: nat): (k: int)
    ensures k == -1 || (from <= k && EscAt(s, k))
    ensures forall j :: from <= j && (k == -1 || j < k) ==> !EscAt(s, j)
    decreases |s| - from
  {
    if from + 3 > |s| then -1
    else if EscAt(s, from) then from
    else NextEsc(s, from + 1)
  }

  /** `s.split(/%1B/i)`: the pieces between the cuts, empty ones included. */
  function Split(s: seq<Unit>): (P: seq<seq<Unit>>)
    ensures |P| >= 1
    decreases |s|
  {
    var k := NextEsc(s, 0);
    if k < 0 then [s] else [s[..k]] + Split(s[k + 3..])
  }

  /** `s.replace(/%49/g, "I")` (mod.ts:207), case-sensitive. */
  function Replace49(s: seq<Unit>): seq<Unit>
    decreases |s|
  {
    if |s| >= 3 && s[0] == PERCENT && s[1] == 52 && s[2] == 57 then [73] + Replace49(s[3..])
    else if s == [] then []
    else [s[0]] + Replace49(s[1..])
  }

  /** `%1B%24` in any case: the head both alternatives of the normalising pattern share. */
  predicate KanjiEscHead(s: seq<Unit>)
  {
    EscAt(s, 0) && |s| >= 6 && s[3] == PERCENT && s[4] == 50 && s[5] == 52
  }

  /**
   * `s.replace(/%1B%24%4[02]|%1B%24@/ig, "%1B%24B")` (mod.ts:203-207, 285-291): the escaped
   * forms of `ESC $ @` and `ESC $ B` become the one that the decoders recognise.
   */
  function Normalize(s: seq<Unit>): seq<Unit>
    decreases |s|
  {
    if KanjiEscHead(s) && |s| >= 9 && s[6] == PERCENT && s[7] == 52 && (s[8] == 48 || s[8] == 50) then
      Shift(Kanji) + Normalize(s[9..])
    else if KanjiEscHead(s) && |s| >= 7 && s[6] == 64 then Shift(Kanji) + Normalize(s[7..])
    else if s == [] then []
    else [s[0]] + Normalize(s[1..])
  }

  // ---------------------------------------------------------------- the segment decoders

  /** `p.replace(/%[0-7][0-9A-F]/ig, I)` of `unescapeJIS7` (mod.ts:178-180, 199). */
  function DecodeAscii(s: seq<Unit>): seq<Unit>
    decreases |s|
  {
    if PctIn(s, 0, 0, 0x7F) then [PctVal(s, 0)] + DecodeAscii(s[3..])
    else if s == [] then []
    else [s[0]] + DecodeAscii(s[1..])
  }

  /** `[!-_]` under the `i` flag: `!` to `_`, and `a` to `z`, whose capitals lie in that range. */
  predicate KanaLiteral(c: int)
  {
    0x21 <= c <= 0x5F || 0x61 <= c <= 0x7A
  }

  /** `p.replace(rJ, J)` (mod.ts:181-185, 200): the byte, escaped or literal, plus 0xFF40. */
  function DecodeKana(s: seq<Unit>): seq<Unit>
    decreases |s|
  {
    if PctIn(s, 0, 0x21, 0x5F) then [PctVal(s, 0) + 65344] + DecodeKana(s[3..])
    else if s != [] && KanaLiteral(s[0]) then [s[0] + 65344] + DecodeKana(s[1..])
    else if s == [] then []
    else [s[0]] + DecodeKana(s[1..])
  }

  /** `%21` to `%7E`, the escaped byte of `rK`. */
  predicate KanjiPct(s: seq<Unit>, k: int)
  {
    PctIn(s, k, 0x21, 0x7E)
  }

  /** `[!-~]`, the literal byte of `rK`. */
  predicate KanjiLit(s: seq<Unit>, k: int)
  {
    0 <= k < |s| && 0x21 <= s[k] <= 0x7E
  }

  /** The length `rK` (mod.ts:201-202) matches at the start of `s`, its alternatives tried in order. */
  function KanjiMatch(s: seq<Unit>): (n: nat)
    ensures n == 0 || n == 2 || n == 4 || n == 6
    ensures n <= |s|
  {
    if KanjiPct(s, 0) && KanjiPct(s, 3) then 6
    else if KanjiPct(s, 0) && KanjiLit(s, 3) then 4
    else if KanjiLit(s, 0) && KanjiPct(s, 1) then 4
    else if KanjiLit(s, 0) && KanjiLit(s, 1) then 2
    else 0
  }

  /**
   * The table index `K` (mod.ts:186-198) computes from a match: row and cell less 33. A 4-unit
   * match of a literal `%` and an escape gives `parseInt("%.", 16)`, NaN, and `charAt(NaN)`
   * reads index 0.
   */
  function KanjiIndex(s: seq<Unit>, n: nat): (idx: int)
    requires n == KanjiMatch(s) && n > 0
    ensures 0 <= idx < 8836
  {
    if n == 6 then (PctVal(s, 0) - 33) * 94 + PctVal(s, 3) - 33
    else if n == 4 && s[0] == PERCENT then
      if PctAt(s, 0) then (PctVal(s, 0) - 33) * 94 + s[3] - 33 else 0
    else if n == 4 then (s[0] - 33) * 94 + PctVal(s, 1) - 33
    else (s[0] - 33) * 94 + s[1] - 33
  }

  /** `p.substring(4).replace(rK, K)`: each matched pair read through the table. */
  function DecodeKanji(s: seq<Unit>): seq<Unit>
    decreases |s|
  {
    var n := KanjiMatch(s);
    if n > 0 then CharAt(JCT8836, KanjiIndex(s, n)) + DecodeKanji(s[n..])
    else if s == [] then []
    else [s[0]] + DecodeKanji(s[1..])
  }

  /**
   * `p.replace(/%([0-7][0-9A-F]|A[1-9A-F]|[B-D][0-9A-F])/ig, I)` of `unescapeJIS8`
   * (mod.ts:265-268, 282): an ASCII byte, or a katakana byte 0xA1-0xDF plus 0xFEC0.
   */
  function DecodeSingle(s: seq<Unit>): seq<Unit>
    decreases |s|
  {
    if PctIn(s, 0, 0, 0x7F) || PctIn(s, 0, 0xA1, 0xDF) then
      var v := PctVal(s, 0);
      [if v < 128 then v else v + 65216] + DecodeSingle(s[3..])
    else if s == [] then []
    else [s[0]] + DecodeSingle(s[1..])
  }

  /** `x.substring(2)`. */
  function DropTwo(x: seq<Unit>): seq<Unit>
  {
    if |x| >= 2 then x[2..] else []
  }

  /**
   * One segment, by its first four units (`p.substring(0, 4)`): after `%24B` JIS X 0208, after
   * `%28I` (`unescapeJIS7` only) katakana, otherwise single bytes, whose `(B` is then dropped.
   */
  function DecodeSegment(sch: Scheme, p: seq<Unit>): seq<Unit>
  {
    var q := if |p| >= 4 then p[..4] else p;
    if q == Designator(Kanji) then DecodeKanji(p[4..])
    else if sch == SevenBit && q == Designator(Katakana) then DecodeKana(p[4..])
    else if sch == SevenBit then DropTwo(DecodeAscii(p))
    else DropTwo(DecodeSingle(p))
  }

  /** What `while ((p = P[i++])) s += ...` accumulates: the segments before the first empty one. */
  function DecodeSegments(sch: Scheme, P: seq<seq<Unit>>): seq<Unit>
    decreases |P|
  {
    if P == [] || P[0] == [] then [] else DecodeSegment(sch, P[0]) + DecodeSegments(sch, P[1..])
  }

  /** The loop of mod.ts:206-216 and 290-296. */
  method RunSegments(sch: Scheme, P: seq<seq<Unit>>) returns (s: seq<Unit>)
    ensures s == DecodeSegments(sch, P)
  {
    s := [];
    var i := 0;
    while i < |P| && P[i] != []
      invariant 0 <= i <= |P|
      invariant s + DecodeSegments(sch, P[i..]) == DecodeSegments(sch, P)
    {
      SegmentsStep(sch, P, i, s);
      s := s + DecodeSegment(sch, P[i]);
      i := i + 1;
    }
    SegmentsStop(sch, P, i);
    assert s + [] == s;
  }

  lemma SegmentsStep(sch: Scheme, P: seq<seq<Unit>>, i: nat, s: seq<Unit>)
    requires i < |P| && P[i] != [] && s + DecodeSegments(sch, P[i..]) == DecodeSegments(sch, P)
    ensures s + DecodeSegment(sch, P[i]) + DecodeSegments(sch, P[i + 1..]) == DecodeSegments(sch, P)
  {
    assert P[i..][0] == P[i] && P[i..][1..] == P[i + 1..];
    Assoc(s, DecodeSegment(sch, P[i]), DecodeSegments(sch, P[i + 1..]));
  }

  lemma SegmentsStop(sch: Scheme, P: seq<seq<Unit>>, i: nat)
    requires i == |P| || (i < |P| && P[i] == [])
    ensures DecodeSegments(sch, P[i..]) == []
  {
    if i < |P| {
      assert P[i..][0] == [];
    }
  }

  /** Nothing after an empty segment is decoded: a `%1B` right after another, or at the end. */
  lemma {:induction false} StopsAtEmpty(sch: Scheme, P: seq<seq<Unit>>, Q: seq<seq<Unit>>)
    ensures DecodeSegments(sch, P + [[]] + Q) == DecodeSegments(sch, P)
    decreases |P|
  {
    var x := P + [[]] + Q;
    if P == [] {
      assert x[0] == [];
    } else {
      assert x[0] == P[0] && x[1..] == P[1..] + [[]] + Q;
      StopsAtEmpty(sch, P[1..], Q);
    }
  }

  /** `("%28B" + x).split(/%1B/i)` decoded: the text after normalising, in the base set. */
  function Unstream(sch: Scheme, x: seq<Unit>): seq<Unit>
  {
    DecodeSegments(sch, Split(Designator(Ascii) + x))
  }

  // ---------------------------------------------------------------- each unit read back

  /** The decoder of the segments written after the escape sequence of `k`. */
  function DecodeRun(k: Charset, s: seq<Unit>): seq<Unit>
  {
    match k
    case Ascii => DecodeAscii(s)
    case Katakana => DecodeKana(s)
    case Kanji => DecodeKanji(s)
    case SingleByte => DecodeSingle(s)
  }

  /** A unit that its class writes reversibly: JIS X 0208 characters must be in the table. */
  predicate Representable(k: Charset, c: Unit)
  {
    InSet(k, c) && (k == Kanji ==> c in JCT8836)
  }

  lemma Tail1(c: Unit, z: seq<Unit>)
    ensures ([c] + z)[0] == c && ([c] + z)[1..] == z
  {
  }

  lemma Tail3(b: Byte, z: seq<Unit>)
    ensures PctAt(Pct(b) + z, 0) && PctVal(Pct(b) + z, 0) == b && (Pct(b) + z)[3..] == z
  {
    PctRead(b, z);
  }

  lemma AsciiUnit(c: Unit, z: seq<Unit>)
    requires c < 128
    ensures DecodeAscii(UnitCode(Ascii, c) + z) == [c] + DecodeAscii(z)
  {
    if IsSafe(c) {
      Tail1(c, z);
    } else {
      Tail3(c, z);
    }
  }

  lemma SingleUnit(c: Unit, z: seq<Unit>)
    requires c < 128 || IsKatakana(c)
    ensures DecodeSingle(UnitCode(SingleByte, c) + z) == [c] + DecodeSingle(z)
  {
    if IsSafe(c) {
      Tail1(c, z);
    } else if c < 128 {
      Tail3(c, z);
    } else {
      Tail3(c - 65216, z);
    }
  }

  lemma KanaUnit(c: Unit, z: seq<Unit>)
    requires IsKatakana(c)
    ensures DecodeKana(UnitCode(Katakana, c) + z) == [c] + DecodeKana(z)
  {
    var v := c - 65344;
    if IsSafe(v) {
      Tail1(v, z);
    } else {
      Tail3(v, z);
    }
  }

  /** Both bytes escaped: the first alternative of `rK`. */
  lemma KanjiPP(b1: Byte, b2: Byte, z: seq<Unit>)
    requires 0x21 <= b1 <= 0x7E && 0x21 <= b2 <= 0x7E
    ensures var s := Pct(b1) + Pct(b2) + z;
      KanjiMatch(s) == 6 && KanjiIndex(s, 6) == (b1 - 33) * 94 + b2 - 33 && s[6..] == z
  {
    var s := Pct(b1) + Pct(b2) + z;
    Assoc(Pct(b1), Pct(b2), z);
    PctRead(b1, Pct(b2) + z);
    PctPrefix(Pct(b2) + z, [], 0);
    assert s[3..] == Pct(b2) + z;
    Tail3(b2, z);
    assert s[3..6] == Pct(b2);
    assert PctAt(s, 3) && PctVal(s, 3) == b2;
  }

  /** First byte escaped, second literal: the second alternative. */
  lemma KanjiPL(b1: Byte, b2: Byte, z: seq<Unit>)
    requires 0x21 <= b1 <= 0x7E && 0x21 <= b2 <= 0x7E && b2 != PERCENT
    ensures var s := Pct(b1) + [b2] + z;
      KanjiMatch(s) == 4 && KanjiIndex(s, 4) == (b1 - 33) * 94 + b2 - 33 && s[4..] == z
  {
    var s := Pct(b1) + [b2] + z;
    Assoc(Pct(b1), [b2], z);
    PctRead(b1, [b2] + z);
    assert s[3] == b2;
    assert !KanjiPct(s, 3);
    assert s[4..] == z;
  }

  /** First byte literal, second escaped: the third alternative. */
  lemma KanjiLP(b1: Byte, b2: Byte, z: seq<Unit>)
    requires 0x21 <= b1 <= 0x7E && 0x21 <= b2 <= 0x7E && b1 != PERCENT
    ensures var s := [b1] + Pct(b2) + z;
      KanjiMatch(s) == 4 && KanjiIndex(s, 4) == (b1 - 33) * 94 + b2 - 33 && s[4..] == z
  {
    var s := [b1] + Pct(b2) + z;
    Assoc([b1], Pct(b2), z);
    Tail3(b2, z);
    assert s[1..] == Pct(b2) + z;
    assert s[1..4] == Pct(b2);
    assert PctAt(s, 1) && PctVal(s, 1) == b2;
    assert !KanjiPct(s, 0);
    assert s[4..] == z;
  }

  /** Both bytes literal: the last alternative. */
  lemma KanjiLL(b1: Byte, b2: Byte, z: seq<Unit>)
    requires 0x21 <= b1 <= 0x7E && 0x21 <= b2 <= 0x7E && b1 != PERCENT && b2 != PERCENT
    ensures var s := [b1] + [b2] + z;
      KanjiMatch(s) == 2 && KanjiIndex(s, 2) == (b1 - 33) * 94 + b2 - 33 && s[2..] == z
  {
    var s := [b1] + [b2] + z;
    assert s[0] == b1 && s[1] == b2 && s[2..] == z;
    assert !KanjiPct(s, 0) && !KanjiPct(s, 1);
  }

  lemma KanjiUnit(c: Unit, z: seq<Unit>)
    requires InSet(Kanji, c) && c in JCT8836
    ensures DecodeKanji(UnitCode(Kanji, c) + z) == [c] + DecodeKanji(z)
  {
    var idx := IndexOf(JCT8836, c);
    RowCell(idx);
    var b1, b2 := idx / 94 + 33, idx % 94 + 33;
    assert UnitCode(Kanji, c) == H(b1) + H(b2);
    var s := H(b1) + H(b2) + z;
    var n: nat;
    if !IsSafe(b1) && !IsSafe(b2) {
      KanjiPP(b1, b2, z);
      n := 6;
    } else if !IsSafe(b1) {
      KanjiPL(b1, b2, z);
      n := 4;
    } else if !IsSafe(b2) {
      KanjiLP(b1, b2, z);
      n := 4;
    } else {
      KanjiLL(b1, b2, z);
      n := 2;
    }
    assert KanjiMatch(s) == n && KanjiIndex(s, n) == idx && s[n..] == z;
    assert CharAt(JCT8836, idx) == [c];
  }

  /** Each unit of a run, written after its class's designator, is read back as itself. */
  lemma UnitRead(k: Charset, c: Unit, z: seq<Unit>)
    requires Representable(k, c)
    ensures DecodeRun(k, UnitCode(k, c) + z) == [c] + DecodeRun(k, z)
  {
    match k
    case Ascii => AsciiUnit(c, z);
    case Katakana => KanaUnit(c, z);
    case Kanji => KanjiUnit(c, z);
    case SingleByte => SingleUnit(c, z);
  }

  predicate AllRepresentable(k: Charset, r: seq<Unit>)
  {
    forall j :: 0 <= j < |r| ==> Representable(k, r[j])
  }

  /** A whole run is read back, whatever follows it. */
  lemma {:induction false} BodyRead(k: Charset, r: seq<Unit>, z: seq<Unit>)
    requires AllRepresentable(k, r)
    ensures AllIn(k, r) && DecodeRun(k, Body(k, r) + z) == r + DecodeRun(k, z)
    decreases |r|
  {
    if r != [] {
      assert Representable(k, r[0]);
      assert AllRepresentable(k, r[1..]);
      BodyRead(k, r[1..], z);
      Assoc(UnitCode(k, r[0]), Body(k, r[1..]), z);
      UnitRead(k, r[0], Body(k, r[1..]) + z);
      assert r == [r[0]] + r[1..];
      Assoc([r[0]], r[1..], DecodeRun(k, z));
    } else {
      assert Body(k, r) + z == z;
    }
  }
}
