/**
 * `escapeJIS8` and `unescapeJIS8` (mod.ts:225-298): JIS X 0201 single bytes (ASCII and
 * half-width katakana 0xA1-0xDF) with JIS X 0208 runs behind `%1B%24B`, %-escaped.
 */
module Jis8 {
  import opened Units
  import opened CodeTable
  import opened JisEscape
  import opened JisUnescape
  import opened JisRoundTrip

  /** `escapeJIS8`: the two passes, which write the stream form. */
  function EscapeJIS8(s: seq<Unit>): (r: seq<Unit>)
    ensures r == EscFrom(EightBit, s, SingleByte)
  {
    EscapeStream(EightBit, s);
    Escape(EightBit, s)
  }

  // ---------------------------------------------------------------- as written

  /** `x.split("")`: one segment per unit. */
  function Chars(x: seq<Unit>): (P: seq<seq<Unit>>)
    ensures |P| == |x| && forall i :: 0 <= i < |x| ==> P[i] == [x[i]]
  {
    seq(|x|, i requires 0 <= i < |x| => [x[i]])
  }

  /** `unescapeJIS8` as written: the designators normalised, then split into single units. */
  function UnescapeJIS8AsWritten(e: seq<Unit>): seq<Unit>
  {
    DecodeSegments(EightBit, Chars(Designator(Ascii) + Normalize(e)))
  }

  /** A one-unit segment is never a `%24B` segment, and `substring(2)` leaves nothing of it. */
  lemma OneUnitSegment(c: Unit)
    ensures DecodeSegment(EightBit, [c]) == []
  {
    var p: seq<Unit> := [c];
    if PctIn(p, 0, 0, 0x7F) || PctIn(p, 0, 0xA1, 0xDF) {
      assert false;
    }
    assert p[1..] == [];
    assert DecodeSingle(p) == [c];
  }

  lemma {:induction false} SingletonSegments(P: seq<seq<Unit>>)
    requires forall i :: 0 <= i < |P| ==> |P[i]| == 1
    ensures DecodeSegments(EightBit, P) == []
    decreases |P|
  {
    if P != [] {
      OneUnitSegment(P[0][0]);
      assert P[0] == [P[0][0]];
      SingletonSegments(P[1..]);
    }
  }

  /** As written, `unescapeJIS8` returns the empty string for every input. */
  lemma AsWrittenEmpty(e: seq<Unit>)
    ensures UnescapeJIS8AsWritten(e) == []
  {
    SingletonSegments(Chars(Designator(Ascii) + Normalize(e)));
  }

  /** `escapeJIS8("A")` is `A`, which the code as written does not read back. */
  lemma AsWrittenLosesText()
    ensures EscapeJIS8([65]) == [65] && UnescapeJIS8AsWritten([65]) == []
  {
    var s: seq<Unit> := [65];
    var n := ModeRun(EightBit, s);
    assert SetOf(EightBit, 65) == SingleByte;
    EscFromSame(EightBit, s, SingleByte);
    assert s[..n] == s && s[n..] == [];
    BodyOne(SingleByte, 65);
    AsWrittenEmpty([65]);
  }

  // ---------------------------------------------------------------- corrected

  /** `unescapeJIS8` with `P` split at `/%1B/i`, as `unescapeJIS7` does. */
  function UnescapeJIS8(e: seq<Unit>): seq<Unit>
  {
    Unstream(EightBit, Normalize(e))
  }

  /**
   * The corrected decoder round-trips every text with no ESC unit whose JIS X 0208 characters
   * are in the table.
   */
  lemma RoundTrip(s: seq<Unit>)
    requires Encodable(EightBit, s)
    ensures UnescapeJIS8(EscapeJIS8(s)) == s
  {
    var e := EscapeJIS8(s);
    EncodableNoEsc(EightBit, s);
    EscFromFramed(EightBit, s, SingleByte);
    NormalizeFramed(e);
    UnstreamEscFrom(EightBit, s);
  }

  /** Half-width katakana `ｱ` (U+FF71) is the byte 0xB1, written `%B1`, without escape. */
  lemma KatakanaExample()
    ensures EscapeJIS8([0xFF71]) == Pct(0xB1)
  {
    var s: seq<Unit> := [0xFF71];
    var n := ModeRun(EightBit, s);
    assert SetOf(EightBit, 0xFF71) == SingleByte;
    EscFromSame(EightBit, s, SingleByte);
    assert s[..n] == s && s[n..] == [];
    BodyOne(SingleByte, 0xFF71);
  }
}
